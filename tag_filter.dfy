/**
 * `filterAndSortTags` and `contains` (package-collector.go lines 417-444):
 * every tag is lower-cased and the fixed deny-list is dropped. Despite its
 * name the function keeps input order and keeps duplicates.
 */
module TagFilter {
  import opened GoStrings

  /** `filtered_tags`: labels that say nothing beyond "this is Zig". */
  const FilteredTags: seq<string> := ["zig", "zig-package", "ziglang", "zig-programming-language", "zig-library", "zig-lang"]

  /** `contains`: a linear search that stops at the first match. */
  method Contains(s: seq<string>, e: string) returns (found: bool)
    ensures found <==> e in s
  {
    for i := 0 to |s|
      invariant e !in s[..i]
    {
      if s[i] == e {
        return true;
      }
    }
    return false;
  }

  /** The filter as a specification: lower-case each tag, keep those off the deny-list, in order. */
  function Filtered(tags: seq<string>): seq<string> {
    if tags == [] then []
    else
      var tag := ToLower(tags[|tags| - 1]);
      Filtered(tags[..|tags| - 1]) + if tag in FilteredTags then [] else [tag]
  }

  method FilterAndSortTags(tags: seq<string>) returns (res: seq<string>)
    ensures res == Filtered(tags)
  {
    res := [];
    for i := 0 to |tags|
      invariant res == Filtered(tags[..i])
    {
      var tag := ToLower(tags[i]);
      var denied := Contains(FilteredTags, tag);
      if !denied {
        res := res + [tag];
      }
      assert tags[..i + 1][..i] == tags[..i];
    }
    assert tags[..|tags|] == tags;
  }

  /** The output holds exactly the lower-cased inputs that are not on the deny-list. */
  lemma {:induction false} FilteredMembers(tags: seq<string>)
    ensures forall t :: t in Filtered(tags) <==> t !in FilteredTags && exists i :: 0 <= i < |tags| && t == ToLower(tags[i])
  {
    if tags != [] {
      var init := tags[..|tags| - 1];
      FilteredMembers(init);
      forall t | t !in FilteredTags && t in Filtered(tags)
        ensures exists i :: 0 <= i < |tags| && t == ToLower(tags[i])
      {
        if t in Filtered(init) {
          var i :| 0 <= i < |init| && t == ToLower(init[i]);
          assert t == ToLower(tags[i]);
        }
      }
      forall t | t !in FilteredTags && (exists i :: 0 <= i < |tags| && t == ToLower(tags[i]))
        ensures t in Filtered(tags)
      {
        var i :| 0 <= i < |tags| && t == ToLower(tags[i]);
        if i < |init| {
          assert t == ToLower(init[i]);
        }
      }
    }
  }

  /** Every output tag is lower-case and none is on the deny-list. */
  lemma FilteredClean(tags: seq<string>)
    ensures forall t :: t in Filtered(tags) ==> IsLower(t) && t !in FilteredTags
  {
    FilteredMembers(tags);
    forall t | t in Filtered(tags)
      ensures IsLower(t)
    {
      var i :| 0 <= i < |tags| && t == ToLower(tags[i]);
      ToLowerIsLower(tags[i]);
    }
  }

  /** Filtering distributes over concatenation: order is kept, nothing is reordered across inputs. */
  lemma {:induction false} FilteredAppend(a: seq<string>, b: seq<string>)
    ensures Filtered(a + b) == Filtered(a) + Filtered(b)
  {
    if b == [] {
      assert a + b == a;
    } else {
      var b' := b[..|b| - 1];
      assert (a + b)[..|a + b| - 1] == a + b';
      FilteredAppend(a, b');
    }
  }

  /** Filtering a second time changes nothing. */
  lemma {:induction false} FilteredIdempotent(tags: seq<string>)
    ensures Filtered(Filtered(tags)) == Filtered(tags)
  {
    if tags != [] {
      var init := tags[..|tags| - 1];
      var tag := ToLower(tags[|tags| - 1]);
      FilteredIdempotent(init);
      if tag !in FilteredTags {
        FilteredAppend(Filtered(init), [tag]);
        assert [tag][..0] == [];
        ToLowerIdempotent(tags[|tags| - 1]);
        assert Filtered([tag]) == [tag];
        assert Filtered(tags) == Filtered(init) + [tag];
      } else {
        assert Filtered(tags) == Filtered(init) + [] == Filtered(init);
      }
    }
  }

  lemma FilteredSnoc(init: seq<string>, tag: string)
    ensures Filtered(init + [tag]) == Filtered(init) + if ToLower(tag) in FilteredTags then [] else [ToLower(tag)]
  {
    assert (init + [tag])[..|init|] == init;
  }

  /** How the three tags of the example below fare against the deny-list. */
  lemma ExampleTagsAgainstDenyList()
    ensures ToLower("Zig") in FilteredTags
    ensures ToLower("http") == "http" && "http" !in FilteredTags
    ensures ToLower("zig-package") in FilteredTags
  {
    LowerFixpoint("http");
    LowerFixpoint("zig-package");
    assert ToLower("Zig") == "zig" == FilteredTags[0];
    assert FilteredTags[1] == "zig-package";
    forall t | t in FilteredTags ensures |t| != 4 { }
  }

  /** Three tags where the first and last are denied and the middle one is already lower-case. */
  lemma FilteredKeepsMiddle(x: string, y: string, z: string)
    requires ToLower(x) in FilteredTags && ToLower(z) in FilteredTags
    requires ToLower(y) == y && y !in FilteredTags
    ensures Filtered([x, y, z]) == [y]
  {
    FilteredSnoc([], x);
    assert [] + [x] == [x];
    FilteredSnoc([x], y);
    assert [x] + [y] == [x, y];
    FilteredSnoc([x, y], z);
    assert [x, y] + [z] == [x, y, z];
  }

  /** Example: `["Zig", "http", "zig-package"]` filters to `["http"]`. */
  lemma FilterExample()
    ensures Filtered(["Zig", "http", "zig-package"]) == ["http"]
  {
    ExampleTagsAgainstDenyList();
    FilteredKeepsMiddle("Zig", "http", "zig-package");
  }
}
