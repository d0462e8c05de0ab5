/**
 * In-place recursive quicksort with Lomuto partitioning (the last element of
 * the range is the pivot), and the ascending-order checker its driver uses.
 * Elements are integers, the driver's element type; `<` stands for
 * `compareTo(...) < 0`.
 */
module QuickSort {

  /** Every pair of elements is in order. */
  ghost predicate Sorted(s: seq<int>) {
    forall i, j :: 0 <= i < j < |s| ==> s[i] <= s[j]
  }

  /** No adjacent pair is out of order: the test ValidateSortedAscending performs. */
  ghost predicate AdjacentSorted(s: seq<int>) {
    forall k :: 0 <= k < |s| - 1 ==> !(s[k + 1] < s[k])
  }

  /** The elements at indices lo..hi (inclusive) are in order. */
  ghost predicate SortedBetween(s: seq<int>, lo: int, hi: int) {
    forall i, j :: 0 <= lo <= i < j <= hi < |s| ==> s[i] <= s[j]
  }

  /** s and t have the same length and agree at every index outside lo..hi (inclusive). */
  ghost predicate SameOutside<T>(s: seq<T>, t: seq<T>, lo: int, hi: int) {
    |s| == |t| && forall k :: 0 <= k < |s| && !(lo <= k <= hi) ==> s[k] == t[k]
  }

  /** Checking adjacent pairs is the same as checking every pair. */
  lemma {:induction false} AdjacentSortedIffSorted(s: seq<int>)
    ensures AdjacentSorted(s) <==> Sorted(s)
  {
    if |s| >= 2 {
      var rest := s[1..];
      AdjacentSortedIffSorted(rest);
      if AdjacentSorted(s) {
        assert AdjacentSorted(rest) by {
          forall k | 0 <= k < |rest| - 1 ensures !(rest[k + 1] < rest[k]) {
            assert rest[k] == s[k + 1] && rest[k + 1] == s[k + 2];
          }
        }
        forall i, j | 0 <= i < j < |s| ensures s[i] <= s[j] {
          if 0 < i {
            assert s[i] == rest[i - 1] && s[j] == rest[j - 1];
          } else if 1 < j {
            assert s[1] == rest[0] && s[j] == rest[j - 1];
          }
        }
      }
    }
  }

  /** The elements of s are those before lo, those of lo..hi, and those after hi. */
  lemma ThreeParts(s: seq<int>, lo: int, hi: int)
    requires 0 <= lo <= hi + 1 <= |s|
    ensures multiset(s) == multiset(s[..lo]) + multiset(s[lo..hi + 1]) + multiset(s[hi + 1..])
  {
    assert s == s[..lo] + s[lo..hi + 1] + s[hi + 1..];
  }

  /**
   * When t agrees with s outside lo..hi and both hold the same elements, the
   * ranges lo..hi of the two hold the same elements.
   */
  lemma RangeMultiset(s: seq<int>, t: seq<int>, lo: int, hi: int)
    requires 0 <= lo <= hi + 1 <= |s|
    requires SameOutside(s, t, lo, hi)
    requires multiset(s) == multiset(t)
    ensures multiset(s[lo..hi + 1]) == multiset(t[lo..hi + 1])
  {
    ThreeParts(s, lo, hi);
    ThreeParts(t, lo, hi);
    assert t[..lo] == s[..lo];
    assert t[hi + 1..] == s[hi + 1..];
    var outside := multiset(s[..lo]) + multiset(s[hi + 1..]);
    assert multiset(s[lo..hi + 1]) == multiset(s) - outside;
    assert multiset(t[lo..hi + 1]) == multiset(t) - outside;
  }

  /**
   * When the ranges lo..hi of s and t hold the same elements, an upper bound
   * on that range of s is one on that range of t.
   */
  lemma RangeBelow(s: seq<int>, t: seq<int>, lo: int, hi: int, x: int)
    requires 0 <= lo <= hi + 1 <= |s| == |t|
    requires multiset(s[lo..hi + 1]) == multiset(t[lo..hi + 1])
    requires forall k :: lo <= k <= hi ==> s[k] < x
    ensures forall k :: lo <= k <= hi ==> t[k] < x
  {
    forall k | lo <= k <= hi ensures t[k] < x {
      assert t[k] == t[lo..hi + 1][k - lo];
      assert t[k] in multiset(s[lo..hi + 1]);
      var m :| 0 <= m < hi + 1 - lo && s[lo..hi + 1][m] == t[k];
      assert s[lo + m] == t[k];
    }
  }

  /**
   * When the ranges lo..hi of s and t hold the same elements, a lower bound
   * on that range of s is one on that range of t.
   */
  lemma RangeNotBelow(s: seq<int>, t: seq<int>, lo: int, hi: int, x: int)
    requires 0 <= lo <= hi + 1 <= |s| == |t|
    requires multiset(s[lo..hi + 1]) == multiset(t[lo..hi + 1])
    requires forall k :: lo <= k <= hi ==> !(s[k] < x)
    ensures forall k :: lo <= k <= hi ==> !(t[k] < x)
  {
    forall k | lo <= k <= hi ensures !(t[k] < x) {
      assert t[k] == t[lo..hi + 1][k - lo];
      assert t[k] in multiset(s[lo..hi + 1]);
      var m :| 0 <= m < hi + 1 - lo && s[lo..hi + 1][m] == t[k];
      assert s[lo + m] == t[k];
    }
  }

  /**
   * A sorted range of elements below the pivot, the pivot, and a sorted
   * range of elements not below it, side by side, form one sorted range.
   */
  lemma JoinAroundPivot(s: seq<int>, left: int, mid: int, right: int)
    requires 0 <= left <= mid <= right < |s|
    requires SortedBetween(s, left, mid - 1) && SortedBetween(s, mid + 1, right)
    requires forall k :: left <= k < mid ==> s[k] < s[mid]
    requires forall k :: mid < k <= right ==> !(s[k] < s[mid])
    ensures SortedBetween(s, left, right)
  {
  }

  /**
   * The driver's check: walks the pair (arr[j], arr[i]) with j == i - 1 along
   * the array and fails at the first pair that is out of order.
   */
  method ValidateSortedAscending(arr: array<int>) returns (ok: bool)
    ensures ok <==> AdjacentSorted(arr[..])
    ensures ok <==> Sorted(arr[..])
  {
    AdjacentSortedIffSorted(arr[..]);
    var i := 0;
    var j := 0;
    while i < arr.Length - 1
      invariant 0 <= i && j == i
      invariant i <= if arr.Length == 0 then 0 else arr.Length - 1
      invariant forall k :: 0 <= k < i ==> !(arr[k + 1] < arr[k])
    {
      i := i + 1;
      if arr[i] < arr[j] {
        return false;
      }
      j := j + 1;
    }
    return true;
  }

  /** Exchanges arr[i] and arr[j]; with i == j nothing changes. */
  method Swap<T>(arr: array<T>, i: int, j: int)
    requires 0 <= i < arr.Length && 0 <= j < arr.Length
    modifies arr
    ensures arr[..] == old(arr[..])[i := old(arr[j])][j := old(arr[i])]
    ensures multiset(arr[..]) == multiset(old(arr[..]))
  {
    var temp := arr[i];
    arr[i] := arr[j];
    arr[j] := temp;
  }

  /**
   * The partition loop's invariant after examining s[left..j): s agrees with
   * s0 outside left..right and holds the same elements, the pivot is still at
   * `right`, the elements of left..i-1 are below it and those of i..j-1 are not.
   */
  ghost predicate Partitioned(s0: seq<int>, s: seq<int>, left: int, right: int, i: int, j: int, pivot: int) {
    && 0 <= left <= i <= j <= right < |s|
    && s[right] == pivot
    && (forall k :: left <= k < i ==> s[k] < pivot)
    && (forall k :: i <= k < j ==> !(s[k] < pivot))
    && SameOutside(s0, s, left, right)
    && multiset(s) == multiset(s0)
  }

  /** A loop step that finds s[j] not below the pivot leaves it where it is. */
  lemma PartitionSkip(s0: seq<int>, s: seq<int>, left: int, right: int, i: int, j: int, pivot: int)
    requires Partitioned(s0, s, left, right, i, j, pivot) && j < right
    requires !(s[j] < pivot)
    ensures Partitioned(s0, s, left, right, i, j + 1, pivot)
  {
  }

  /**
   * A loop step that finds s[j] below the pivot: swapping it into position i
   * grows the "below" part by one and keeps the rest of the invariant.
   */
  lemma PartitionAdvance(s0: seq<int>, s: seq<int>, t: seq<int>, left: int, right: int, i: int, j: int, pivot: int)
    requires Partitioned(s0, s, left, right, i, j, pivot) && j < right
    requires s[j] < pivot
    requires t == s[i := s[j]][j := s[i]] && multiset(t) == multiset(s)
    ensures Partitioned(s0, t, left, right, i + 1, j + 1, pivot)
  {
  }

  /**
   * The last swap of the partition: exchanging the pivot at `right` with the
   * first element not below it puts the pivot at i between the two parts.
   */
  lemma PartitionPlacePivot(s0: seq<int>, s: seq<int>, t: seq<int>, left: int, right: int, i: int, pivot: int)
    requires Partitioned(s0, s, left, right, i, right, pivot)
    requires t == s[i := s[right]][right := s[i]] && multiset(t) == multiset(s)
    ensures t[i] == pivot
    ensures forall k :: left <= k < i ==> t[k] < t[i]
    ensures forall k :: i < k <= right ==> !(t[k] < t[i])
    ensures SameOutside(s0, t, left, right) && multiset(t) == multiset(s0)
  {
  }

  /**
   * Lomuto partition of arr[left..right] around the pivot arr[right]: the
   * pivot ends at the returned index p, everything before it in the range is
   * smaller, everything after it is not; the range is permuted and nothing
   * outside it changes.
   */
  method Partition(arr: array<int>, left: int, right: int) returns (p: int)
    requires 0 <= left <= right < arr.Length
    modifies arr
    ensures left <= p <= right
    ensures arr[p] == old(arr[right])
    ensures forall k :: left <= k < p ==> arr[k] < arr[p]
    ensures forall k :: p < k <= right ==> !(arr[k] < arr[p])
    ensures SameOutside(old(arr[..]), arr[..], left, right)
    ensures multiset(arr[..]) == multiset(old(arr[..]))
    ensures multiset(arr[left..right + 1]) == multiset(old(arr[left..right + 1]))
  {
    ghost var s0 := arr[..];
    var i := left; // next slot for an element below the pivot
    var pivot := arr[right];
    for j := left to right
      invariant Partitioned(s0, arr[..], left, right, i, j, pivot)
    {
      ghost var before := arr[..];
      if arr[j] < pivot {
        Swap(arr, i, j);
        PartitionAdvance(s0, before, arr[..], left, right, i, j, pivot);
        i := i + 1;
      } else {
        PartitionSkip(s0, before, left, right, i, j, pivot);
      }
    }
    ghost var before := arr[..];
    Swap(arr, i, right);
    PartitionPlacePivot(s0, before, arr[..], left, right, i, pivot);
    p := i;
    RangeMultiset(s0, arr[..], left, right);
  }

  /**
   * Sorts arr[left..right] (inclusive) in place.  With left >= right nothing
   * changes; otherwise the range ends sorted and permuted, and nothing
   * outside it changes.
   */
  method QuickSort(arr: array<int>, left: int, right: int)
    requires left < right ==> 0 <= left && right < arr.Length
    modifies arr
    ensures left >= right ==> arr[..] == old(arr[..])
    ensures SameOutside(old(arr[..]), arr[..], left, right)
    ensures multiset(arr[..]) == multiset(old(arr[..]))
    ensures left < right ==> multiset(arr[left..right + 1]) == multiset(old(arr[left..right + 1]))
    ensures SortedBetween(arr[..], left, right)
    decreases right - left
  {
    if left < right {
      var mid := Partition(arr, left, right);
      ghost var afterPartition := arr[..];
      QuickSort(arr, left, mid - 1);
      ghost var afterLeft := arr[..];
      QuickSort(arr, mid + 1, right);
      QuickSortStep(old(arr[..]), afterPartition, afterLeft, arr[..], left, mid, right);
    }
  }

  /**
   * The recursive case of QuickSort: a partition of s0 around s1[mid],
   * followed by sorting (by permutation) the part before mid and then the
   * part after it, leaves left..right sorted and permuted and the rest as
   * it was.
   */
  lemma QuickSortStep(s0: seq<int>, s1: seq<int>, s2: seq<int>, s3: seq<int>, left: int, mid: int, right: int)
    requires 0 <= left <= mid <= right < |s0|
    requires SameOutside(s0, s1, left, right) && multiset(s1) == multiset(s0)
    requires forall k :: left <= k < mid ==> s1[k] < s1[mid]
    requires forall k :: mid < k <= right ==> !(s1[k] < s1[mid])
    requires SameOutside(s1, s2, left, mid - 1) && multiset(s2) == multiset(s1)
    requires SortedBetween(s2, left, mid - 1)
    requires SameOutside(s2, s3, mid + 1, right) && multiset(s3) == multiset(s2)
    requires SortedBetween(s3, mid + 1, right)
    ensures SameOutside(s0, s3, left, right) && multiset(s3) == multiset(s0)
    ensures multiset(s3[left..right + 1]) == multiset(s0[left..right + 1])
    ensures SortedBetween(s3, left, right)
  {
    var pivot := s1[mid];
    RangeMultiset(s1, s2, left, mid - 1);
    RangeBelow(s1, s2, left, mid - 1, pivot);
    RangeMultiset(s2, s3, mid + 1, right);
    RangeNotBelow(s2, s3, mid + 1, right, pivot);
    assert forall k :: left <= k <= mid ==> s3[k] == s2[k];
    assert s3[mid] == pivot;
    JoinAroundPivot(s3, left, mid, right);
    RangeMultiset(s0, s3, left, right);
  }

  /** One run of the driver: sort the whole array, then check it; the check always passes. */
  method SortAndValidate(arr: array<int>) returns (ok: bool)
    modifies arr
    ensures ok
    ensures multiset(arr[..]) == multiset(old(arr[..]))
  {
    QuickSort(arr, 0, arr.Length - 1);
    ok := ValidateSortedAscending(arr);
  }
}
