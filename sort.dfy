/**
 * The descending-size sort of the candidate list. The library sort is not
 * stable, so only its postcondition is fixed: the array ends as a permutation
 * of its old contents in non-increasing order of size. The body that meets it
 * here is a selection sort.
 */
module SizeSort {
  import opened Records

  predicate SortedBySizeDesc(s: seq<File>)
  {
    forall p, q :: 0 <= p < q < |s| ==> s[p].size >= s[q].size
  }

  /** The index of a largest record at or after `from`. */
  method IndexOfLargest(a: array<File>, from: nat) returns (m: nat)
    requires from < a.Length
    ensures from <= m < a.Length
    ensures forall k :: from <= k < a.Length ==> a[k].size <= a[m].size
  {
    m := from;
    var k := from + 1;
    while k < a.Length
      invariant from <= m < k <= a.Length
      invariant forall l :: from <= l < k ==> a[l].size <= a[m].size
    {
      if a[k].size > a[m].size {
        m := k;
      }
      k := k + 1;
    }
  }

  method Swap(a: array<File>, i: nat, j: nat)
    requires i < a.Length && j < a.Length
    modifies a
    ensures a[i] == old(a[j]) && a[j] == old(a[i])
    ensures forall k :: 0 <= k < a.Length && k != i && k != j ==> a[k] == old(a[k])
    ensures multiset(a[..]) == old(multiset(a[..]))
  {
    a[i], a[j] := a[j], a[i];
  }

  /** Sorts the records by size, largest first. */
  method SortBySizeDesc(a: array<File>)
    modifies a
    ensures SortedBySizeDesc(a[..])
    ensures multiset(a[..]) == old(multiset(a[..]))
  {
    var i := 0;
    while i < a.Length
      invariant 0 <= i <= a.Length
      invariant forall p, q :: 0 <= p < i && p < q < a.Length ==> a[p].size >= a[q].size
      invariant multiset(a[..]) == old(multiset(a[..]))
    {
      var m := IndexOfLargest(a, i);
      Swap(a, i, m);
      i := i + 1;
    }
  }
}
