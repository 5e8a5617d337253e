/**
 * The collector's pipeline after fetching (package-collector.go lines
 * 211-313, without JSON encoding and file writes): merge the raw records,
 * finalise each package's tags while walking the map, sort the packages by
 * lower-cased display name, build the tag catalogue from the curated
 * definitions and the packages' tags, and sort it by lower-cased name.
 * Go walks a map in an unspecified order; the walks here pick an arbitrary
 * remaining key each time and report the order they used as a ghost result.
 */
module Collector {
  import opened GoStrings
  import opened Sorting
  import opened Packages
  import opened TagMerge
  import opened MergeEngine
  import opened TagCatalogue
  import opened TagFilter

  /** `out` is `stored` with its tags deduplicated and sorted, as line 245 leaves it. */
  ghost predicate Finalized(out: Package, stored: Package) {
    && out == stored.(tags := out.tags)
    && StrictlyIncreasing(out.tags)
    && forall t :: t in out.tags <==> t in stored.tags
  }

  /** `order` lists every key of `m` once and nothing else. */
  ghost predicate EnumeratesKeys<V>(order: seq<string>, m: map<string, V>) {
    && (forall i, j :: 0 <= i < j < |order| ==> order[i] != order[j])
    && (forall k :: k in m <==> k in order)
  }

  /** The sort key of the package list (line 250). */
  function DisplayKey(pkg: Package): string {
    ToLower(pkg.displayName)
  }

  /** The sort key of the tag list (line 312). */
  function NameKey(tag: Tag): string {
    ToLower(tag.name)
  }

  /** Lines 243-247: every stored package, in map order, with its tags through `mergeTags`. */
  method CollectPackages(packages: map<string, Package>) returns (list: seq<Package>, ghost order: seq<string>)
    ensures EnumeratesKeys(order, packages)
    ensures |list| == |order|
    ensures forall i :: 0 <= i < |list| ==> Finalized(list[i], packages[order[i]])
    ensures |list| == |packages|
  {
    list, order := [], [];
    var remaining := packages.Keys;
    while remaining != {}
      invariant remaining <= packages.Keys
      invariant |order| + |remaining| == |packages.Keys|
      invariant forall i, j :: 0 <= i < j < |order| ==> order[i] != order[j]
      invariant forall k :: k in packages <==> k in order || k in remaining
      invariant forall k :: k in order ==> k !in remaining
      invariant |list| == |order|
      invariant forall i :: 0 <= i < |list| ==> order[i] in packages && Finalized(list[i], packages[order[i]])
      decreases remaining
    {
      var key :| key in remaining;
      var pkg := packages[key];
      var merged := MergeTags([pkg.tags]);
      assert [pkg.tags][..0] == [];
      assert Flatten([pkg.tags]) == pkg.tags;
      list := list + [pkg.(tags := merged)];
      order := order + [key];
      remaining := remaining - {key};
    }
  }

  /** Lines 306-309: every catalogue entry, in map order. */
  method CollectTags(tags: map<string, Tag>) returns (list: seq<Tag>, ghost order: seq<string>)
    ensures EnumeratesKeys(order, tags)
    ensures |list| == |order|
    ensures forall i :: 0 <= i < |list| ==> list[i] == tags[order[i]]
    ensures |list| == |tags|
    ensures forall tag :: tag in list <==> tag in tags.Values
  {
    list, order := [], [];
    var remaining := tags.Keys;
    while remaining != {}
      invariant remaining <= tags.Keys
      invariant |order| + |remaining| == |tags.Keys|
      invariant forall i, j :: 0 <= i < j < |order| ==> order[i] != order[j]
      invariant forall k :: k in tags <==> k in order || k in remaining
      invariant forall k :: k in order ==> k !in remaining
      invariant |list| == |order|
      invariant forall i :: 0 <= i < |list| ==> order[i] in tags && list[i] == tags[order[i]]
      decreases remaining
    {
      var key :| key in remaining;
      list := list + [tags[key]];
      order := order + [key];
      remaining := remaining - {key};
    }
    ListedValues(tags, order, list, list);
  }

  /** A permutation of a map walk's output holds exactly the map's values. */
  lemma ListedValues<V>(m: map<string, V>, order: seq<string>, walked: seq<V>, sorted: seq<V>)
    requires EnumeratesKeys(order, m) && |walked| == |order|
    requires forall i :: 0 <= i < |walked| ==> walked[i] == m[order[i]]
    requires multiset(sorted) == multiset(walked)
    ensures forall v :: v in sorted <==> v in m.Values
  {
    forall v | v in m.Values
      ensures v in sorted
    {
      var key :| key in m && m[key] == v;
      var i :| 0 <= i < |order| && order[i] == key;
      assert walked[i] == v;
      assert v in multiset(walked);
    }
    forall v | v in sorted
      ensures v in m.Values
    {
      assert v in multiset(walked);
      var i :| 0 <= i < |walked| && walked[i] == v;
      assert order[i] in m;
    }
  }

  /**
   * Every map value occurs exactly once in a permutation of the walk: the
   * keys are visited once each, and distinct keys hold distinct tags.
   */
  lemma ListedOnce(m: map<string, Tag>, order: seq<string>, walked: seq<Tag>, sorted: seq<Tag>)
    requires NamesMatchKeys(m) && EnumeratesKeys(order, m) && |walked| == |order|
    requires forall i :: 0 <= i < |walked| ==> walked[i] == m[order[i]]
    requires multiset(sorted) == multiset(walked)
    ensures forall t :: t in m.Values ==> multiset(sorted)[t] == 1
  {
    forall i, j | 0 <= i < j < |walked|
      ensures walked[i] != walked[j]
    {
      assert walked[i].name == order[i] && walked[j].name == order[j];
    }
    assert Distinct(walked);
    forall t | t in m.Values
      ensures multiset(sorted)[t] == 1
    {
      DistinctCount(walked, t);
      var key :| key in m && m[key] == t;
      var i :| 0 <= i < |order| && order[i] == key;
      assert walked[i] == t;
    }
  }

  /** Every record's tags came out of `filterAndSortTags`, as each fetcher passes them (aquila.red passes none). */
  ghost predicate FilteredInput(raw: seq<Package>) {
    forall pkg :: pkg in raw ==> exists ts :: pkg.tags == Filtered(ts)
  }

  /** Every tag of every listed package is lower-case and off the deny-list. */
  ghost predicate CleanTags(list: seq<Package>) {
    forall pkg, t :: pkg in list && t in pkg.tags ==> IsLower(t) && t !in FilteredTags
  }

  /** A listed package's tags all come from the raw records. */
  lemma ListedTagsFromInput(raw: seq<Package>, unsorted: seq<Package>, order: seq<string>, list: seq<Package>)
    requires EnumeratesKeys(order, Fold(raw)) && |unsorted| == |order|
    requires forall i :: 0 <= i < |unsorted| ==> Finalized(unsorted[i], Fold(raw)[order[i]])
    requires multiset(list) == multiset(unsorted)
    ensures forall pkg, t :: pkg in list && t in pkg.tags ==> exists source :: source in raw && t in source.tags
  {
    forall pkg, t | pkg in list && t in pkg.tags
      ensures exists source :: source in raw && t in source.tags
    {
      assert pkg in multiset(unsorted);
      var i :| 0 <= i < |unsorted| && unsorted[i] == pkg;
      var k := order[i];
      assert k in Fold(raw) && t in Fold(raw)[k].tags;
      FoldTagsFromInput(raw);
    }
  }

  /** Filtered input tags stay lower-case and off the deny-list through merging and finalising. */
  lemma ListedTagsClean(raw: seq<Package>, list: seq<Package>)
    requires forall pkg, t :: pkg in list && t in pkg.tags ==> exists source :: source in raw && t in source.tags
    ensures FilteredInput(raw) ==> CleanTags(list)
  {
    if FilteredInput(raw) {
      forall pkg, t | pkg in list && t in pkg.tags
        ensures IsLower(t) && t !in FilteredTags
      {
        var source :| source in raw && t in source.tags;
        var ts :| source.tags == Filtered(ts);
        FilteredClean(ts);
      }
    }
  }

  /** The curated definitions bypass the filter: a file `<name>.json` defines tag `name`, even a denied one such as `zig`. */
  lemma CuratedNameKept(name: string, description: string)
    ensures CuratedTags([TagFile(name + ".json", description)]) == map[name := Tag(name, description)]
  {
    var f := name + ".json";
    assert f[|f| - 5..] == ".json";
    assert f[..|f| - 5] == name;
    assert [TagFile(f, description)][..0] == [];
  }

  /** What the catalogue's construction guarantees, carried over to any list of exactly its values. */
  lemma CatalogueListed(curated: map<string, Tag>, packages: seq<Package>, listed: seq<Tag>)
    requires NamesMatchKeys(curated)
    requires forall t :: t in listed <==> t in AddPackageTags(curated, packages).Values
    ensures forall pkg, name :: pkg in packages && name in pkg.tags ==>
      name in AddPackageTags(curated, packages) && AddPackageTags(curated, packages)[name].name == name &&
      AddPackageTags(curated, packages)[name] in listed
    ensures forall name :: name in curated && name != "" ==> curated[name] in listed
    ensures forall tag :: tag in listed && tag.name !in curated ==> tag.description == ""
  {
    var all := AddPackageTags(curated, packages);
    CatalogueSpec(curated, packages);
    forall pkg, name | pkg in packages && name in pkg.tags
      ensures name in all && all[name].name == name && all[name] in listed
    {
      assert OnSomePackage(packages, name);
      assert all[name] in all.Values;
    }
    forall name | name in curated && name != ""
      ensures curated[name] in listed
    {
      assert all[name] in all.Values;
    }
    forall tag | tag in listed && tag.name !in curated
      ensures tag.description == ""
    {
      var name :| name in all && all[name] == tag;
    }
  }

  /**
   * What lines 211-251 produce: `packages` is the merged map, `order` the
   * order the walk visited its keys, `unsorted` the finalised entries in that
   * order, and `list` (the output) a permutation of them sorted by
   * lower-cased display name. Filtered input tags stay clean.
   */
  ghost predicate PackageListOf(raw: seq<Package>, list: seq<Package>, packages: map<string, Package>,
                                unsorted: seq<Package>, order: seq<string>) {
    && packages == Fold(raw)
    && EnumeratesKeys(order, packages) && |unsorted| == |order|
    && (forall i :: 0 <= i < |unsorted| ==> Finalized(unsorted[i], packages[order[i]]))
    && multiset(list) == multiset(unsorted)
    && |list| == |packages|
    && SortedBy(list, DisplayKey)
    && (FilteredInput(raw) ==> CleanTags(list))
  }

  /**
   * What lines 260-313 produce from the curated files and the finished
   * package list: `allTags` is the catalogue, and `list` (the output) holds
   * each of its values exactly once, sorted by lower-cased name. Every
   * package tag is listed under its own name, curated tags keep their
   * descriptions, and all other tags have an empty one.
   */
  ghost predicate TagListOf(tagFiles: seq<TagFile>, packages: seq<Package>, list: seq<Tag>, allTags: map<string, Tag>) {
    && allTags == AddPackageTags(CuratedTags(tagFiles), packages)
    && |list| == |allTags|
    && (forall t :: t in list <==> t in allTags.Values)
    && (forall t :: t in allTags.Values ==> multiset(list)[t] == 1)
    && SortedBy(list, NameKey)
    && (forall pkg, name :: pkg in packages && name in pkg.tags ==>
          name in allTags && allTags[name].name == name && allTags[name] in list)
    && (forall name :: name in CuratedTags(tagFiles) && name != "" ==> CuratedTags(tagFiles)[name] in list)
    && (forall tag :: tag in list && tag.name !in CuratedTags(tagFiles) ==> tag.description == "")
  }

  /** Lines 211-251: merge the raw records, finalise each entry's tags, sort by lower-cased display name. */
  method BuildPackageList(raw: seq<Package>)
    returns (packageList: array<Package>, ghost packages: map<string, Package>,
             ghost unsorted: seq<Package>, ghost order: seq<string>)
    ensures fresh(packageList)
    ensures PackageListOf(raw, packageList[..], packages, unsorted, order)
  {
    var merged := MergePackages(raw);
    packages := merged;
    var list;
    list, order := CollectPackages(merged);
    unsorted := list;
    packageList := SortedCopy(list, DisplayKey);
    ListedTagsFromInput(raw, unsorted, order, packageList[..]);
    ListedTagsClean(raw, packageList[..]);
  }

  /** Lines 260-313 without the directory walk. */
  method BuildTagList(tagFiles: seq<TagFile>, packageList: seq<Package>)
    returns (tagList: array<Tag>, ghost allTags: map<string, Tag>)
    ensures fresh(tagList)
    ensures TagListOf(tagFiles, packageList, tagList[..], allTags)
  {
    var curated := CuratedTags(tagFiles);
    var catalogue := ExtendCatalogue(curated, packageList);
    allTags := catalogue;
    var tags;
    ghost var tagOrder;
    tags, tagOrder := CollectTags(catalogue);
    tagList := SortedCopy(tags, NameKey);
    ghost var listed := tagList[..];
    CatalogueSpec(curated, packageList);
    ListedValues(catalogue, tagOrder, tags, listed);
    ListedOnce(catalogue, tagOrder, tags, listed);
    CatalogueListed(curated, packageList, listed);
  }

  /**
   * Lines 211-313 without I/O. `raw` is every fetched record in processing
   * order; `tagFiles` the curated tag definitions in walk order (empty when
   * the curated repository is not fetched).
   */
  method Collect(raw: seq<Package>, tagFiles: seq<TagFile>)
    returns (packageList: array<Package>, tagList: array<Tag>,
             ghost packages: map<string, Package>, ghost unsorted: seq<Package>, ghost order: seq<string>,
             ghost allTags: map<string, Tag>)
    ensures fresh(packageList) && fresh(tagList)
    ensures PackageListOf(raw, packageList[..], packages, unsorted, order)
    ensures TagListOf(tagFiles, packageList[..], tagList[..], allTags)
  {
    packageList, packages, unsorted, order := BuildPackageList(raw);
    var listed := packageList[..];
    tagList, allTags := BuildTagList(tagFiles, listed);
    assert packageList[..] == listed;
  }
}
