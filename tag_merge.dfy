/**
 * `mergeTags` (package-collector.go lines 375-391): drops repeated tags with a
 * set, then sorts what is left with `sort.Strings` (byte order).
 */
module TagMerge {
  import opened GoStrings
  import opened Sorting

  /** All the tag lists of the variadic parameter, one after the other. */
  function Flatten(tagsList: seq<seq<string>>): seq<string> {
    if tagsList == [] then [] else Flatten(tagsList[..|tagsList| - 1]) + tagsList[|tagsList| - 1]
  }

  predicate Distinct<T(==)>(s: seq<T>) {
    forall i, j :: 0 <= i < j < |s| ==> s[i] != s[j]
  }

  /** Sorted with no duplicates. */
  predicate StrictlyIncreasing(s: seq<string>) {
    forall i, j :: 0 <= i < j < |s| ==> Less(s[i], s[j])
  }

  lemma {:induction false} DistinctCount<T>(s: seq<T>, x: T)
    requires Distinct(s)
    ensures multiset(s)[x] <= 1
  {
    if s != [] {
      assert s == [s[0]] + s[1..];
      DistinctCount(s[1..], x);
      if s[0] == x {
        assert x !in s[1..];
      }
    }
  }

  lemma RepeatedCount<T>(s: seq<T>, i: int, j: int)
    requires 0 <= i < j < |s| && s[i] == s[j]
    ensures multiset(s)[s[i]] >= 2
  {
    assert s == s[..j] + [s[j]] + s[j + 1..];
    assert s[i] in s[..j];
  }

  /** Rearranging a sequence without duplicates yields none. */
  lemma DistinctPermutation<T>(a: seq<T>, b: seq<T>)
    requires Distinct(a) && multiset(a) == multiset(b)
    ensures Distinct(b)
  {
    forall i, j | 0 <= i < j < |b|
      ensures b[i] != b[j]
    {
      if b[i] == b[j] {
        RepeatedCount(b, i, j);
        DistinctCount(a, b[i]);
      }
    }
  }

  /** A sorted sequence without duplicates is strictly increasing. */
  lemma SortedDistinctIncreasing(s: seq<string>)
    requires SortedBy(s, t => t) && Distinct(s)
    ensures StrictlyIncreasing(s)
  {
    forall i, j | 0 <= i < j < |s|
      ensures Less(s[i], s[j])
    {
      assert !Less(s[j], s[i]);
      LessTotal(s[i], s[j]);
    }
  }

  /** The converse: a strictly increasing list is sorted and repeats nothing. */
  lemma IncreasingSortedDistinct(s: seq<string>)
    requires StrictlyIncreasing(s)
    ensures SortedBy(s, t => t) && Distinct(s)
  {
    forall i, j | 0 <= i < j < |s|
      ensures !Less(s[j], s[i]) && s[i] != s[j]
    {
      LessAsymmetric(s[i], s[j]);
      LessIrreflexive(s[i]);
    }
  }

  method MergeTags(tagsList: seq<seq<string>>) returns (res: seq<string>)
    ensures StrictlyIncreasing(res)
    ensures forall t :: t in res <==> t in Flatten(tagsList)
  {
    var seen: set<string> := {};
    var acc: seq<string> := [];
    for i := 0 to |tagsList|
      invariant Distinct(acc)
      invariant forall t :: t in seen <==> t in acc
      invariant forall t :: t in acc <==> t in Flatten(tagsList[..i])
    {
      var tags := tagsList[i];
      assert tagsList[..i + 1][..i] == tagsList[..i];
      for j := 0 to |tags|
        invariant Distinct(acc)
        invariant forall t :: t in seen <==> t in acc
        invariant forall t :: t in acc <==> t in Flatten(tagsList[..i]) + tags[..j]
      {
        var tag := tags[j];
        if tag !in seen {
          acc := acc + [tag];
          seen := seen + {tag};
        }
        assert tags[..j + 1] == tags[..j] + [tag];
      }
      assert tags[..|tags|] == tags;
    }
    assert tagsList[..|tagsList|] == tagsList;
    var buf := new string[|acc|](k requires 0 <= k < |acc| => acc[k]);
    assert buf[..] == acc;
    SortBy(buf, t => t);
    res := buf[..];
    DistinctPermutation(acc, res);
    SortedDistinctIncreasing(res);
    forall t
      ensures t in res <==> t in acc
    {
      assert t in res <==> t in multiset(res);
      assert t in acc <==> t in multiset(acc);
    }
  }
}
