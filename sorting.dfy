/**
 * In-place sorting as the collector uses it: `sort.Strings` on the merged tag
 * slice and `sort.Slice` with a "lower-cased name is less" comparison on the
 * package and tag slices. Neither Go routine is stable and neither promises
 * more than "sorted and a permutation", so one insertion sort over a key
 * function stands for both.
 */
module Sorting {
  import opened GoStrings

  /** No element is strictly less, by key, than one that precedes it. */
  ghost predicate SortedBy<T>(s: seq<T>, key: T -> string) {
    forall i, j :: 0 <= i < j < |s| ==> !Less(key(s[j]), key(s[i]))
  }

  /** The first `n` elements of `a` are sorted by key. */
  ghost predicate SortedPrefix<T>(a: array<T>, n: int, key: T -> string)
    reads a
  {
    forall p, q :: 0 <= p < q < n && q < a.Length ==> !Less(key(a[q]), key(a[p]))
  }

  method Swap<T>(a: array<T>, i: int)
    requires 0 < i < a.Length
    modifies a
    ensures a[i - 1] == old(a[i]) && a[i] == old(a[i - 1])
    ensures forall k :: 0 <= k < a.Length && k != i - 1 && k != i ==> a[k] == old(a[k])
    ensures multiset(a[..]) == old(multiset(a[..]))
  {
    a[i - 1], a[i] := a[i], a[i - 1];
  }

  /** Moves `a[i]` left past every element whose key is greater. */
  method Insert<T>(a: array<T>, i: int, key: T -> string)
    requires 0 <= i < a.Length
    requires SortedPrefix(a, i, key)
    modifies a
    ensures SortedPrefix(a, i + 1, key)
    ensures multiset(a[..]) == old(multiset(a[..]))
  {
    var j := i;
    while 0 < j && Less(key(a[j]), key(a[j - 1]))
      invariant 0 <= j <= i
      invariant forall p, q :: 0 <= p < q <= i && p != j && q != j ==> !Less(key(a[q]), key(a[p]))
      invariant forall q :: j < q <= i ==> !Less(key(a[q]), key(a[j]))
      invariant multiset(a[..]) == old(multiset(a[..]))
    {
      LessAsymmetric(key(a[j]), key(a[j - 1]));
      Swap(a, j);
      j := j - 1;
    }
    forall p | 0 <= p < j
      ensures !Less(key(a[j]), key(a[p]))
    {
      if p < j - 1 {
        NotLessTransitive(key(a[p]), key(a[j - 1]), key(a[j]));
      }
    }
  }

  method SortBy<T>(a: array<T>, key: T -> string)
    modifies a
    ensures SortedBy(a[..], key)
    ensures multiset(a[..]) == old(multiset(a[..]))
  {
    var i := 0;
    while i < a.Length
      invariant 0 <= i <= a.Length
      invariant SortedPrefix(a, i, key)
      invariant multiset(a[..]) == old(multiset(a[..]))
    {
      Insert(a, i, key);
      i := i + 1;
    }
  }

  /** A slice built from `s` (an `append` loop) and then sorted in place, as both output lists are. */
  method SortedCopy<T>(s: seq<T>, key: T -> string) returns (a: array<T>)
    ensures fresh(a)
    ensures a.Length == |s|
    ensures SortedBy(a[..], key)
    ensures multiset(a[..]) == multiset(s)
  {
    a := new T[|s|](i requires 0 <= i < |s| => s[i]);
    assert a[..] == s;
    SortBy(a, key);
  }
}
