/** Sorting a slice in place, standing for Go's `sort.Slice`. */
module Sorting {

  ghost predicate TotalPreorder<T(!new)>(leq: (T, T) -> bool) {
    && (forall x, y :: leq(x, y) || leq(y, x))
    && (forall x, y, z :: leq(x, y) && leq(y, z) ==> leq(x, z))
  }

  ghost predicate SortedBy<T>(s: seq<T>, leq: (T, T) -> bool) {
    forall i, j :: 0 <= i < j < |s| ==> leq(s[i], s[j])
  }

  /** Only the slice changes, and only by a permutation. */
  twostate predicate Permutes<T>(a: array<T>, lo: nat, hi: nat)
    requires lo <= hi <= a.Length
    reads a
  {
    && a[..lo] == old(a[..lo]) && a[hi..] == old(a[hi..])
    && multiset(a[lo..hi]) == multiset(old(a[lo..hi]))
  }

  method Swap<T>(a: array<T>, lo: nat, hi: nat, j: nat)
    requires lo < j < hi <= a.Length
    modifies a
    ensures Permutes(a, lo, hi)
    ensures a[j] == old(a[j - 1]) && a[j - 1] == old(a[j])
    ensures forall k :: 0 <= k < a.Length && k != j && k != j - 1 ==> a[k] == old(a[k])
  {
    ghost var before := a[lo..hi];
    a[j], a[j - 1] := a[j - 1], a[j];
    assert a[lo..hi] == before[j - lo := before[j - 1 - lo]][j - 1 - lo := before[j - lo]];
  }

  method SortSlice<T(!new)>(a: array<T>, lo: nat, hi: nat, leq: (T, T) -> bool)
    requires lo <= hi <= a.Length && TotalPreorder(leq)
    modifies a
    ensures Permutes(a, lo, hi)
    ensures SortedBy(a[lo..hi], leq)
  {
    for i := lo to hi
      invariant Permutes(a, lo, hi)
      invariant forall k, l :: lo <= k < l < i ==> leq(a[k], a[l])
    {
      var j := i;
      while j > lo && !leq(a[j - 1], a[j])
        invariant lo <= j <= i
        invariant Permutes(a, lo, hi)
        invariant forall k, l :: lo <= k < l <= i && l != j ==> leq(a[k], a[l])
      {
        Swap(a, lo, hi, j);
        j := j - 1;
      }
    }
  }
}
